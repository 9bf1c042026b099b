/** The TLS client of `5/c/main.go`: it sends the preface, reads the server's
    first frame, then sends five hand-built HEADERS requests on streams 1 to
    5, reading one response frame after each. */
module Client5 {
  import opened Bytes
  import opened Transport
  import Server3

  /** The HEADERS request on a stream: empty (length 0), type 1, flags
      END_HEADERS | END_STREAM (0x05), the stream id big-endian
      (`RequestDecodes` reads it back). */
  function Request(streamId: nat): (r: seq<Byte>)
    ensures |r| == 9
    ensures r[0] == 0 && r[1] == 0 && r[2] == 0 && r[3] == 1 && r[4] == 5
  {
    [0x00, 0x00, 0x00, 0x01, 0x05] + Be32Bytes(streamId)
  }

  /** The request as a frame. */
  function RequestFrame(streamId: nat): Server3.Frame
  {
    Server3.Frame(0, 1, 5, streamId, [])
  }

  /** The request is exactly 9 bytes: the header of an empty HEADERS frame
      with END_HEADERS | END_STREAM on the given stream. */
  lemma RequestLayout(streamId: nat)
    ensures Request(streamId) == Server3.Layout(RequestFrame(streamId))
    ensures |Request(streamId)| == 9
  {
    var id := Be32Bytes(streamId);
    assert Be24Bytes(0) == [0, 0, 0];
    assert [0, 0, 0] + [1, 5] == [0, 0, 0, 1, 5];
    assert ([0, 0, 0, 1, 5] + id) + [] == [0, 0, 0, 1, 5] + id;
  }

  /** A server reads the request back as that frame. */
  lemma RequestDecodes(streamId: nat, rest: seq<Byte>)
    requires streamId < 0x1_0000_0000
    ensures Server3.Decode(Request(streamId) + rest) == Server3.Ok(Server3.Decoded(RequestFrame(streamId), rest))
  {
    RequestLayout(streamId);
    Server3.RoundTrip(RequestFrame(streamId), rest);
  }

  // ---------------------------------------------------------------------------
  // Effect on the connection
  // ---------------------------------------------------------------------------

  /** Reading one frame the way the client does: 9 header bytes, then as many
      payload bytes as bytes 0..2 announce. The payload, when both reads
      succeed. Type, flags and stream id are not looked at. */
  function AfterReadFrame(w: Wire): (r: (Wire, Option<seq<Byte>>))
    ensures r.0.output == w.output && r.0.writesLeft == w.writesLeft
    ensures r.1.Some? <==> Server3.Decode(w.input).Ok?
  {
    match Server3.Decode(w.input)
    case Err(_) => (w.(input := []), None)
    case Ok(d) => (w.(input := d.rest), Some(d.frame.payload))
  }

  /** `sendRequest`: write the request (ignoring the error), then read the
      response frame. */
  function AfterRequest(w: Wire, streamId: nat): (r: (Wire, Option<seq<Byte>>))
    ensures CanWrite(w) ==> r.0.output == w.output + Request(streamId) && r.0.writesLeft + 1 == w.writesLeft
    ensures !CanWrite(w) ==> r.0.output == w.output && r.0.writesLeft == w.writesLeft
    ensures r.1.Some? <==> Server3.Decode(w.input).Ok?
  {
    AfterReadFrame(AfterWrite(w, Request(streamId)))
  }

  /** The requests on streams 1 to n, in that order, and the payloads read. */
  function AfterRequests(w: Wire, n: nat): (r: (Wire, seq<Option<seq<Byte>>>))
    ensures |r.1| == n
    ensures w.writesLeft >= n ==> r.0.output == w.output + RequestBytes(n) && r.0.writesLeft == w.writesLeft - n
    decreases n
  {
    if n == 0 then (w, [])
    else
      var before := AfterRequests(w, n - 1);
      var last := AfterRequest(before.0, n);
      AppendAssoc(w.output, RequestBytes(n - 1), Request(n));
      (last.0, before.1 + [last.1])
  }

  /** How the client ends. `Fatal`: `log.Fatalf` after a failed read of the
      server's first frame, which exits before any request. */
  datatype Outcome = Fatal | Done(responses: seq<Option<seq<Byte>>>)

  /** `main` from the preface on. */
  function AfterClient(w: Wire): (r: (Wire, Outcome))
    ensures r.1.Fatal? <==> Server3.Decode(w.input).Err?
    ensures r.1.Done? ==> |r.1.responses| == 5
  {
    var settings := AfterReadFrame(AfterWrite(w, ClientPreface));
    if settings.1.None? then (settings.0, Fatal)
    else
      var requests := AfterRequests(settings.0, 5);
      (requests.0, Done(requests.1))
  }

  // ---------------------------------------------------------------------------
  // Properties
  // ---------------------------------------------------------------------------

  /** A response payload is there exactly when a whole frame is, and it has
      exactly the length announced in bytes 0..2 of the header. */
  lemma ResponsePayload(w: Wire)
    ensures AfterReadFrame(w).1.Some? <==>
            |w.input| >= 9 && |w.input| >= 9 + Be24(w.input[0], w.input[1], w.input[2])
    ensures AfterReadFrame(w).1.Some? ==>
            && |AfterReadFrame(w).1.value| == Be24(w.input[0], w.input[1], w.input[2])
            && w.input == w.input[..9] + AfterReadFrame(w).1.value + AfterReadFrame(w).0.input
  {
    if Server3.Decode(w.input).Ok? {
      Server3.DecodedFields(w.input);
    }
  }

  /** The requests as frames, as the loop `for i := 1; i <= 5; i++` sends
      them: every one an empty HEADERS frame with END_HEADERS | END_STREAM,
      their n stream ids strictly increasing from 1 to n, so every id from 1 to n
      is used exactly once. */
  function RequestFrames(n: nat): (fs: seq<Server3.Frame>)
    ensures |fs| == n
    ensures forall i :: 0 <= i < n ==> fs[i] == RequestFrame(i + 1)
    ensures forall i :: 0 <= i < n ==> fs[i].ftype == 1 && fs[i].flags == 5 && fs[i].payload == []
    ensures forall i, j :: 0 <= i < j < n ==> fs[i].streamId < fs[j].streamId
    ensures n > 0 ==> fs[0].streamId == 1 && fs[n - 1].streamId == n
  {
    seq(n, i requires 0 <= i < n => RequestFrame(i + 1))
  }

  lemma LayoutAllAppend(fs: seq<Server3.Frame>, f: Server3.Frame)
    ensures Server3.LayoutAll(fs + [f]) == Server3.LayoutAll(fs) + Server3.Layout(f)
    decreases |fs|
  {
    if fs == [] {
      assert [] + [f] == [f] && [f][1..] == [];
    } else {
      assert (fs + [f])[0] == fs[0] && (fs + [f])[1..] == fs[1..] + [f];
      LayoutAllAppend(fs[1..], f);
      AppendAssoc(Server3.Layout(fs[0]), Server3.LayoutAll(fs[1..]), Server3.Layout(f));
    }
  }

  /** The bytes of the requests on streams 1 to n, in order. */
  function RequestBytes(n: nat): (r: seq<Byte>)
    ensures |r| == 9 * n
  {
    if n == 0 then [] else RequestBytes(n - 1) + Request(n)
  }

  /** Those bytes are the layouts of the request frames on streams 1 to n. */
  lemma {:induction false} RequestBytesFrames(n: nat)
    ensures RequestBytes(n) == Server3.LayoutAll(RequestFrames(n))
  {
    if n == 0 {
      assert RequestFrames(0) == [];
    } else {
      RequestBytesFrames(n - 1);
      RequestBytesStep(n);
    }
  }

  /** The bytes of the first n requests grow by the n-th request. */
  lemma RequestBytesStep(n: nat)
    requires n > 0
    ensures Server3.LayoutAll(RequestFrames(n)) == Server3.LayoutAll(RequestFrames(n - 1)) + Request(n)
  {
    assert RequestFrames(n) == RequestFrames(n - 1) + [RequestFrame(n)];
    LayoutAllAppend(RequestFrames(n - 1), RequestFrame(n));
    RequestLayout(n);
  }

  /** Read back by a server, the requests are the frames on streams 1..n,
      each stream exactly once, in increasing order. */
  lemma RequestStreamIds(n: nat)
    requires n < 0x1_0000_0000
    ensures |Server3.DecodeAll(Server3.LayoutAll(RequestFrames(n)))| == n
    ensures forall i :: 0 <= i < n ==> Server3.DecodeAll(Server3.LayoutAll(RequestFrames(n)))[i].streamId == i + 1
  {
    var fs := RequestFrames(n);
    assert Server3.Decode([]).Err?;
    assert Server3.LayoutAll(fs) + [] == Server3.LayoutAll(fs);
    Server3.DecodeAllLayoutAll(fs, []);
  }

  /** The client's writes when every write goes through: the preface, and
      then, unless reading the server's first frame fails, the five requests
      on streams 1 to 5. */
  lemma ClientWrites(w: Wire)
    requires w.writesLeft >= 6
    ensures AfterClient(w).1.Fatal? ==> AfterClient(w).0.output == w.output + ClientPreface
    ensures AfterClient(w).1.Done? ==>
              AfterClient(w).0.output == w.output + ClientPreface + Server3.LayoutAll(RequestFrames(5))
    ensures AfterClient(w).1.Done? ==> |AfterClient(w).1.responses| == 5
  {
    var sent := AfterWrite(w, ClientPreface);
    assert sent.output == w.output + ClientPreface && sent.writesLeft == w.writesLeft - 1;
    var settings := AfterReadFrame(sent);
    if settings.1.Some? {
      var requests := AfterRequests(settings.0, 5);
      assert requests.0.output == settings.0.output + RequestBytes(5);
      RequestBytesFrames(5);
      AppendAssoc(w.output, ClientPreface, RequestBytes(5));
    }
  }

  // ---------------------------------------------------------------------------
  // The client
  // ---------------------------------------------------------------------------

  /** Read one frame: a 9-byte header buffer, then a payload buffer of exactly
      the announced length. */
  method ReadFrame(c: Conn) returns (payload: Option<seq<Byte>>)
    modifies c
    ensures (c.State(), payload) == AfterReadFrame(old(c.State()))
  {
    ghost var before := c.State();
    var frameHeader, ok := c.ReadFull(9);
    if !ok {
      return None;
    }
    var length := Be24(frameHeader[0], frameHeader[1], frameHeader[2]);
    var buf;
    buf, ok := c.ReadFull(length);
    if !ok {
      return None;
    }
    Server3.DecodeOfParts(before.input, frameHeader, buf, c.input);
    payload := Some(buf);
  }

  /** `sendRequest`. */
  method SendRequest(c: Conn, streamId: nat) returns (payload: Option<seq<Byte>>)
    modifies c
    ensures (c.State(), payload) == AfterRequest(old(c.State()), streamId)
  {
    var headers := [0x00, 0x00, 0x00, 0x01, 0x05,
                    (streamId / 0x100_0000) % 0x100, (streamId / 0x1_0000) % 0x100,
                    (streamId / 0x100) % 0x100, streamId % 0x100];
    Be32BytesShifts(streamId);
    assert headers == Request(streamId);
    var _ := c.Write(headers);
    payload := ReadFrame(c);
  }

  /** `main` from the preface on, the five `sendRequest` goroutines run one
      after the other in order of their stream ids. */
  method RunClient(c: Conn) returns (outcome: Outcome)
    modifies c
    ensures (c.State(), outcome) == AfterClient(old(c.State()))
  {
    var _ := c.Write(ClientPreface);
    var settings := ReadFrame(c);
    if settings.None? {
      return Fatal;
    }
    ghost var start := c.State();
    var responses := [];
    for i := 1 to 6
      invariant (c.State(), responses) == AfterRequests(start, i - 1)
    {
      var payload := SendRequest(c, i);
      responses := responses + [payload];
    }
    outcome := Done(responses);
  }
}
