# Frame layer of http-demo, modelled in Dafny

The repository holds several small, separate attempts at an HTTP/2-style
frame protocol, each in its own `main.go`:

- `6/main.go`: a TLS server with a `Frame` record, a reader (`readFrame`) and
  a writer (`writeFrame`). It checks the 24-byte client preface and sends an
  empty SETTINGS frame. Its read loop answers SETTINGS without ACK with a
  SETTINGS ACK, and answers HEADERS with a fixed HEADERS + DATA response.
  `parseHeaders` splits a header block on NUL into name/value pairs.
- `3/main.go`: a cleartext server. It has its own `readFrame` and no writer:
  its SETTINGS frame and its HEADERS + DATA response are byte literals. Every
  frame read is handled by `handleFrame`.
- `4/s/main.go`: a TLS server. It parses frame headers inline, sends a
  hand-built SETTINGS frame, and answers HEADERS with one DATA frame that it
  builds byte by byte in a buffer.
- `5/c/main.go`: the client of `4/`. It sends the preface, reads one frame,
  then sends five empty HEADERS requests on streams 1 to 5, and reads one
  frame after each.
- `2/main.go`: an HTTP/1.0 responder. It does one read of at most 1024
  bytes and scans the request line. A `GET` URL is split at `?` and its query
  string is parsed on `&`/`=`. Path `/` is answered with a JSON object,
  `get_abc` with `get_abc`, anything else with `do't match`. Any other method
  gets the 501 page.

Each file is a module: `Server6`, `Server3`, `Server4`, `Client5` and
`Httpd2`. Three shared modules sit under them:

- `Bytes`: octets, and the big-endian 24- and 32-bit fields.
- `Transport`: the connection.
- `Text`: splitting on a separator, and decimal numerals.

The module `Drift` relates the variants to each other and proves where their
hand-built frames disagree with their own length fields.

The connection is the class `Transport.Conn`. Its state is a `Wire` record
with three fields:

- the bytes still to come from the peer;
- the bytes written so far;
- how many more `Write` calls the peer will accept. After that, every write
  fails and sends nothing.

Three methods act on it:

- `ReadFull(n)` stands for `io.ReadFull`. It fails, and consumes what is
  left, when fewer than `n` bytes remain.
- `Read(max)` stands for the one `conn.Read` in `2/main.go`.
- `Write(data)` stands for `conn.Write`.

Every handler is a method that takes a `Conn`. Each is proved to leave the connection
in the state computed by a pure function of the state it started from, for
example `Server6.AfterConnection`. The properties are lemmas about those
functions:

- what is written, frame by frame;
- that the preface gates everything;
- that frames round-trip through the codec;
- where the variants drift apart.

The read loops are specified with `DecodeAll`, the sequence of frames that
`readFrame` would return one after another until it first fails.

Go's `a<<16 | b<<8 | c` over octets is the sum `a*65536 + b*256 + c`: the
bits do not overlap. `x & 0x7FFFFFFF` on a `uint32` is `x % 2^31`, and
`byte(x >> k)` is `(x / 2^k) % 256`. The `Shifts` lemmas in `Bytes` state
these forms. Go `int` values that the model keeps unbounded hold no more than
32 bits on any path that is modelled.

Where the programs depart from RFC 7540, the model follows the code:

- Only `6/main.go` clears the reserved bit of the stream id, which section
  4.1 of RFC 7540 says a receiver must ignore. `3/main.go` and `4/s/main.go`
  keep it, on reading and on writing.
- `3/main.go` and `4/s/main.go` do not answer SETTINGS with an ACK, which
  section 6.5.3 requires.
- `4/s/main.go` answers HEADERS with DATA alone. Section 8.1 has a response
  start with a HEADERS frame.
- The client asks on streams 1 to 5, so streams 2 and 4 are even, while
  section 5.1.1 requires client-initiated streams to be odd. It also does not
  acknowledge the server's SETTINGS (section 6.5.3).

## Model

| member | source | states |
|---|---|---|
| `Bytes.Be24` | 6/main.go:31 | a 24-bit length read from three octets is below 2^24 |
| `Bytes.Be32` | 3/main.go:33 | a 32-bit stream id read from four octets is below 2^32 |
| `Bytes.Be24BytesShifts` | 4/s/main.go:55-57 | the length octets are `byte(x >> 16)`, `byte(x >> 8)`, `byte(x)` |
| `Bytes.Be32BytesShifts` | 4/s/main.go:60-63 | the stream id octets are `byte(x >> 24)` … `byte(x)` |
| `Bytes.Be24OfBytes` | 6/main.go:53-55 | reading back the three length octets written yields the length modulo 2^24, so a length of 2^24 or more is truncated |
| `Bytes.Be32OfBytes` | 6/main.go:58 | reading back the four octets of a 32-bit value yields that value |
| `Bytes.Be32ClearTop` | 6/main.go:34 | masking with `0x7FFFFFFF` is the same as clearing the top bit of the first octet |
| `Bytes.BytesOfBe24` | 3/main.go:30 | writing a length that was read yields the same three octets |
| `Bytes.BytesOfBe32` | 3/main.go:33 | writing a stream id that was read yields the same four octets |
| `Transport.ClientPrefaceText` | 6/main.go:79 | the preface is the 24 octets of `PRI * HTTP/2.0\r\n\r\nSM\r\n\r\n` |
| `Transport.AfterRead` | 6/main.go:73 | a read of n octets consumes exactly the first n when there are enough, and all of them otherwise; it writes nothing |
| `Transport.AfterWrite` | 6/main.go:60-63 | a write that the peer accepts appends exactly its data and uses up one write; a refused write changes nothing |
| `Transport.WriteAll` | 2/main.go:85-99 | a run of writes whose errors are ignored reads nothing and only ever extends the output |
| `Transport.WriteAllDelivers` | 2/main.go:85-99 | a run of accepted writes appends the concatenation of their data |
| `Transport.WriteAllExtends` | 2/main.go:85-99 | a run of writes only ever extends the output and never gains write budget |
| `Transport.Conn.constructor` | 6/main.go:68 | a fresh connection has its input waiting, nothing written, and its write budget |
| `Transport.Conn.ReadFull` | 6/main.go:26 | `io.ReadFull`: succeeds iff n octets remain and returns exactly those; the new state is `AfterRead` |
| `Transport.Conn.Read` | 2/main.go:34 | `conn.Read`: fails only at end of stream; otherwise it returns a non-empty prefix of the input of length min(length of the remaining input, buffer size) and consumes exactly it; here the input is everything the peer will ever send |
| `Transport.Conn.Write` | 6/main.go:60 | `conn.Write`: succeeds iff the peer accepts a write; the new state is `AfterWrite` |
| `Text.Split` | 6/main.go:143 | `strings.Split`: one more part than separators, no part contains the separator, and joining the parts gives back the input |
| `Text.SplitJoin` | 2/main.go:123 | splitting parts that were joined gives back the parts |
| `Text.Decimal` | 2/main.go:93 | `%d` of a non-negative int gives digits only, with no leading zero |
| `Text.DecimalRoundTrip` | 2/main.go:93 | the decimal digits of n denote n |
| `Server6.Header` | 6/main.go:52-58 | the header is 9 octets, with the type in octet 3 and the flags in octet 4 |
| `Server6.HeaderFields` | 6/main.go:51-58 | for every frame, octets 0..2 read back as the length modulo 2^24 and octets 5..8 as the stream id with its reserved bit cleared (`StreamID & 0x7FFFFFFF`), so octet 5 is always below 0x80 |
| `Server6.Encode` | 6/main.go:51-66 | `writeFrame` sends the 9-octet header and then exactly the payload, so the frame is 9 octets longer than its payload |
| `Server6.EncodeFields` | 6/main.go:51-66 | for every frame, `writeFrame` sends the length modulo 2^24, the type, the flags, the stream id with its reserved bit cleared (octet 5 below 0x80), and then the payload |
| `Server6.Decode` | 6/main.go:24-49 | `readFrame` fails with a truncated header iff fewer than 9 octets remain, and with a truncated payload iff the header is there but the announced payload is not; a success is a well-formed frame that splits the input into header, payload and rest |
| `Server6.DecodedHeader` | 6/main.go:31-34 | the length, type, flags and masked stream id parsed from a header re-encode to that header with its reserved bit cleared |
| `Server6.DecodeReencodes` | 6/main.go:24-58 | re-encoding a frame that was read gives the octets read, except the reserved bit |
| `Server6.DecodeOfParts` | 6/main.go:24-49 | reading a header, a payload of the announced length and a rest yields exactly that frame and leaves exactly that rest |
| `Server6.RoundTrip` | 6/main.go:24-66 | reading what `writeFrame` wrote for a well-formed frame gives back that frame and leaves what follows untouched |
| `Server6.DecodeAllEncodeCons` | 6/main.go:24-66 | reading a well-formed frame `writeFrame` wrote in front of more bytes returns that frame first, and the loop goes on with exactly those bytes |
| `Server6.DecodeAllEncodeAll` | 6/main.go:102-107 | the read loop reads back exactly the frames written, in order, when what follows them does not parse |
| `Server6.DecodeAll` | 6/main.go:102-107 | the read loop gets no frame iff the first `readFrame` fails; otherwise its first frame is the one that read returns |
| `Server6.DecodeAllWellFormed` | 6/main.go:102-107 | every frame the read loop gets is well-formed: its length matches its payload and its stream id is below 2^31 |
| `Server6.DecodedStreamId` | 6/main.go:34 | a stream id that was read is below 2^31 and is the wire field with its top bit cleared |
| `Server6.AfterWriteFrame` | 6/main.go:51-66 | `writeFrame` succeeds iff two writes are accepted; it then appends exactly the encoded frame; on failure it leaves no write budget and only extends the output |
| `Server6.AfterSimpleResponse` | 6/main.go:150-189 | `sendSimpleResponse` reads nothing and only extends the output |
| `Server6.Replies` | 6/main.go:109-136 | the `switch`: HEADERS gets two replies on its own stream, SETTINGS without ACK gets one on stream 0, every other frame none; for a stream below 2^31 every reply is well-formed |
| `Server6.RepliesAll` | 6/main.go:102-137 | a run of frames gets at most two replies per frame |
| `Server6.AfterFrame` | 6/main.go:109-136 | handling one frame reads nothing and only extends the output |
| `Server6.AfterFrames` | 6/main.go:102-137 | handling a run of frames reads nothing and only extends the output |
| `Server6.AfterLoop` | 6/main.go:102-107 | the read loop ends with the input used up |
| `Server6.LoopStep` | 6/main.go:102-137 | one turn of the loop: read a frame, handle it, go on with the rest |
| `Server6.LoopEnd` | 6/main.go:103-107 | at the end of the input the loop stops and changes nothing |
| `Server6.AfterFrameWrites` | 6/main.go:109-136 | with enough write budget, handling a frame writes exactly the encodings of its replies |
| `Server6.AfterFramesWrites` | 6/main.go:102-137 | with enough write budget, handling a run of frames writes exactly the encodings of all their replies, in order |
| `Server6.AfterLoopWrites` | 6/main.go:102-137 | the read loop writes exactly the replies to the frames `DecodeAll` finds on the input |
| `Server6.AfterValidPreface` | 6/main.go:72-100 | after a valid preface the server writes the empty SETTINGS frame and then runs the loop on the rest |
| `Server6.PrefaceGate` | 6/main.go:72-82 | a missing or wrong preface: nothing is written and no write budget is used; a short input is used up and a wrong preface leaves exactly what follows it |
| `Server6.FirstFrameIsSettings` | 6/main.go:86-94 | after a valid preface, once a single write is accepted, the output starts with `00 00 00 04 00 00 00 00 00` |
| `Server6.ServesFrames` | 6/main.go:68-138 | the whole connection writes the initial SETTINGS frame followed by the replies to every frame read, in order |
| `Server6.AfterConnection` | 6/main.go:68-138 | `handleConnection` only ever extends the output, and it reads from the front: it stops right after the preface or uses up the input |
| `Server6.SettingsAcked` | 6/main.go:116-130 | SETTINGS without ACK gets exactly one SETTINGS ACK with an empty payload on stream 0 |
| `Server6.OthersIgnored` | 6/main.go:131-135 | SETTINGS with ACK, WINDOW_UPDATE and every other type except HEADERS get no reply |
| `Server6.HeadersAnswered` | 6/main.go:150-189 | HEADERS gets a 28-octet END_HEADERS HEADERS frame and then a DATA frame with END_STREAM carrying `Hello, HTTP/2!`, both on the request's stream |
| `Server6.PairsMapSpec` | 6/main.go:144-146 | a name is in the header map iff some complete pair starts with it; its value is the one paired with it last; a trailing unpaired part is dropped |
| `Server6.PairsMapNulFree` | 6/main.go:143-146 | when no part holds a NUL, no name or value in the map does |
| `Server6.HeaderMap` | 6/main.go:140-148 | `parseHeaders` returns names and values free of NUL |
| `Server6.ParseHeaders` | 6/main.go:140-148 | the loop over `i = 0, 2, …` builds exactly the map of the NUL-split pairs |
| `Server6.ReadFrame` | 6/main.go:24-49 | succeeds iff `Decode` does, returning its frame and leaving its rest; a failed read leaves no input |
| `Server6.WriteFrame` | 6/main.go:51-66 | header then payload; the new state and the result are those of `AfterWriteFrame` |
| `Server6.SendSimpleResponse` | 6/main.go:150-189 | the new state is `AfterSimpleResponse` |
| `Server6.HandleConnection` | 6/main.go:68-138 | the new state is `AfterConnection` |
| `Server3.Layout` | 3/main.go:95-113 | the octets of a frame number 9 plus the payload length |
| `Server3.Decode` | 3/main.go:24-47 | fails with a truncated header iff fewer than 9 octets remain, and with a truncated payload iff the announced payload is not there; a success is well-formed |
| `Server3.DecodedFields` | 3/main.go:30-37 | the fields read are octets 0..2 as the length, 3 as the type, 4 as the flags, 5..8 as the whole 32-bit stream id, followed by the payload and the rest |
| `Server3.ReservedBitKept` | 3/main.go:33 | the stream id read is 2^31 or more iff the reserved bit is set on the wire |
| `Server3.DecodeOfParts` | 3/main.go:24-47 | a header, a payload of the announced length and a rest read as exactly that frame and that rest |
| `Server3.LayoutFields` | 3/main.go:95-113 | the laid-out octets carry the length, the type, the flags, the stream id and the payload in their places |
| `Server3.RoundTrip` | 3/main.go:24-47 | reading the layout of a well-formed frame gives it back and leaves what follows |
| `Server3.DecodeAllLayoutAll` | 3/main.go:74-86 | the read loop reads back exactly the frames laid out, in order |
| `Server3.DecodeAll` | 3/main.go:74-79 | the read loop gets no frame iff the first `readFrame` fails; otherwise its first frame is the one that read returns |
| `Server3.DecodeAllWellFormed` | 3/main.go:74-79 | every frame the read loop gets is well-formed: its length matches its payload and its stream id fits in 32 bits |
| `Server3.Replies` | 3/main.go:91-116 | HEADERS gets two writes, any other frame none; the first is a HEADERS frame with END_HEADERS carrying the header block, the second a DATA frame with END_STREAM carrying `Hello, H2!` |
| `Server3.RepliesAll` | 3/main.go:74-86 | a run of frames gets at most two writes per frame |
| `Server3.AfterFrame` | 3/main.go:91-116 | handling a frame reads nothing and only extends the output |
| `Server3.AfterFrames` | 3/main.go:74-86 | handling a run of frames reads nothing and only extends the output |
| `Server3.AfterLoop` | 3/main.go:74-79 | the loop ends with the input used up and only extends the output |
| `Server3.OnlyHeadersAnswered` | 3/main.go:94 | handling a frame leaves the connection unchanged iff the frame is not HEADERS or no write is accepted |
| `Server3.InitialSettingsFrame` | 3/main.go:65-71 | the SETTINGS literal is the layout of the empty SETTINGS frame on stream 0 |
| `Server3.HeadersAnswered` | 3/main.go:94-115 | with two writes accepted, HEADERS gets the HEADERS literal and then the DATA literal on the request's stream |
| `Server3.HeadersResponseFields` | 3/main.go:95-104 | the HEADERS literal has type 1, flags END_HEADERS and the request's stream id |
| `Server3.DataResponseFields` | 3/main.go:107-113 | the DATA literal has type 0, END_STREAM, the request's stream id, and the 10-octet body it announces |
| `Server3.ResponseBodyText` | 3/main.go:112 | the body is `Hello, H2!` |
| `Server3.PrefaceGate` | 3/main.go:52-60 | a missing or wrong preface: nothing is written and no write budget is used; a short input is used up and a wrong preface leaves exactly what follows it |
| `Server3.AfterFramesWrites` | 3/main.go:74-86 | with enough write budget, the frames handled write exactly the concatenation of their replies |
| `Server3.AfterValidPreface` | 3/main.go:52-71 | after a valid preface the server writes the SETTINGS literal and runs the loop on the rest |
| `Server3.ServesFrames` | 3/main.go:49-89 | the whole connection writes the SETTINGS literal followed by the replies to every frame read, in order |
| `Server3.AfterConnection` | 3/main.go:49-89 | `handleConnection` only ever extends the output, and it reads from the front: it stops right after the preface or uses up the input |
| `Server3.LoopStep` | 3/main.go:74-86 | one turn of the loop: read a frame, handle it, go on with the rest |
| `Server3.LoopEnd` | 3/main.go:75-79 | at the end of the input the loop stops and changes nothing |
| `Server3.ReadFrame` | 3/main.go:24-47 | succeeds iff `Decode` does, returning its frame and leaving its rest |
| `Server3.HandleFrame` | 3/main.go:91-116 | the new state is `AfterFrame` |
| `Server3.HandleConnection` | 3/main.go:49-89 | the new state is `AfterConnection` |
| `Server4.AfterFrame` | 4/s/main.go:51-66 | handling a frame reads nothing and only extends the output |
| `Server4.DataFrame` | 4/s/main.go:53-64 | for data below 2^24 octets and a 32-bit stream id, a reader reads the DATA frame's layout back as exactly that frame |
| `Server4.Replies` | 4/s/main.go:51-66 | HEADERS gets one write, any other frame none: a DATA frame with END_STREAM of 9 octets plus the body, the body from offset 9 on |
| `Server4.RepliesAll` | 4/s/main.go:34-67 | a run of frames gets at most one write per frame |
| `Server4.AnswerFrame` | 4/s/main.go:51-66 | HEADERS is answered by one write of its DATA frame; any other frame leaves the connection as it is |
| `Server4.AfterFrames` | 4/s/main.go:34-67 | handling a run of frames reads nothing and only extends the output |
| `Server4.AfterLoop` | 4/s/main.go:34-49 | the loop ends with the input used up and only extends the output |
| `Server4.PrefaceGate` | 4/s/main.go:15-20 | a short read or a wrong preface: nothing is written and no write budget is used; a short input is used up and a wrong preface leaves exactly what follows it |
| `Server4.SettingsFields` | 4/s/main.go:23-30 | the SETTINGS literal has type 4, no flags and stream 0 |
| `Server4.AfterValidPreface` | 4/s/main.go:15-31 | after a valid preface the server writes the SETTINGS literal and runs the loop on the rest |
| `Server4.FirstWriteIsSettings` | 4/s/main.go:23-31 | after a valid preface the output starts with the SETTINGS literal |
| `Server4.OnlyHeadersAnswered` | 4/s/main.go:51 | handling a frame leaves the connection unchanged iff it is not HEADERS or no write is accepted |
| `Server4.DataFrameFields` | 4/s/main.go:53-64 | the DATA frame is 9 octets plus the data, with the data length, type 0, END_STREAM and the stream id in their places, then the data |
| `Server4.DataFrameReadBack` | 4/s/main.go:53-65 | a peer reads the DATA reply back as that frame and leaves what follows |
| `Server4.AfterFramesWrites` | 4/s/main.go:34-67 | with enough write budget, the frames handled write exactly the concatenation of their replies |
| `Server4.ServesFrames` | 4/s/main.go:13-68 | the whole connection writes the SETTINGS literal followed by one DATA frame per HEADERS frame read, in order |
| `Server4.AfterConnection` | 4/s/main.go:13-68 | `handleConnection` only ever extends the output, and it reads from the front: it stops right after the preface or uses up the input |
| `Server4.LoopStep` | 4/s/main.go:34-67 | one turn of the loop: read a frame, handle it, go on with the rest |
| `Server4.LoopEnd` | 4/s/main.go:35-39 | at the end of the input the loop stops and changes nothing |
| `Server4.BuildDataFrame` | 4/s/main.go:53-64 | the buffer filled octet by octet, with `copy` for the data, holds exactly the layout of the DATA frame |
| `Server4.AnswerHeaders` | 4/s/main.go:51-66 | the body of the loop after a parse: the new state is `AfterFrame` of the frame parsed |
| `Server4.HandleConnection` | 4/s/main.go:13-68 | the new state is `AfterConnection` |
| `Client5.Request` | 5/c/main.go:19-24 | a request is 9 octets with a declared length of 0, type HEADERS and flags END_HEADERS and END_STREAM |
| `Client5.RequestLayout` | 5/c/main.go:19-24 | a request is 9 octets: the layout of an empty HEADERS frame with END_HEADERS and END_STREAM on its stream |
| `Client5.RequestDecodes` | 5/c/main.go:19-25 | a server reads the request back as that frame |
| `Client5.AfterReadFrame` | 5/c/main.go:28-41 | reading a response frame writes nothing; it yields a payload iff a whole frame is there to read |
| `Client5.AfterRequest` | 5/c/main.go:17-44 | `sendRequest` appends exactly its request when the write is accepted and using one write, changes no output otherwise, and yields a payload iff a whole frame is there to read |
| `Client5.AfterRequests` | 5/c/main.go:84-92 | n requests yield n results; when every write is accepted they write exactly the n requests in order and use n writes |
| `Client5.ResponsePayload` | 5/c/main.go:28-41 | a payload is returned iff a whole frame is there; it has the announced length and sits between the header and the rest |
| `Client5.RequestFrames` | 5/c/main.go:84-89 | the n requests are empty HEADERS frames with END_HEADERS and END_STREAM whose stream ids strictly increase from 1 to n, so each stream 1..n is asked exactly once |
| `Client5.RequestBytes` | 5/c/main.go:84-89 | n requests are 9n octets |
| `Client5.RequestBytesFrames` | 5/c/main.go:84-89 | those octets are the layouts of the request frames on streams 1 to n |
| `Client5.RequestStreamIds` | 5/c/main.go:84-89 | a server reads back exactly n requests, the i-th on stream i + 1, each stream once |
| `Client5.ClientWrites` | 5/c/main.go:66-92 | the client writes the preface and then, unless reading the server's first frame fails, the five requests, and collects five results |
| `Client5.AfterClient` | 5/c/main.go:66-92 | the client stops fatally iff the server's first frame cannot be read; otherwise it collects five results |
| `Client5.ReadFrame` | 5/c/main.go:28-41 | the new state and the payload are those of `AfterReadFrame` |
| `Client5.SendRequest` | 5/c/main.go:17-44 | the octets built with shifts are the request; the new state is `AfterRequest` |
| `Client5.RunClient` | 5/c/main.go:66-92 | the new state and the outcome are those of `AfterClient` |
| `Httpd2.RunEnd` | 2/main.go:44-47 | the scan stops at the first space from its start, or at the end |
| `Httpd2.SpacesEnd` | 2/main.go:53-55 | the scan skips exactly the run of spaces from its start |
| `Httpd2.ParseRequestLine` | 2/main.go:42-62 | the method is a space-free prefix of the octets read, the URL is space-free, and the two together take no more octets than were read |
| `Httpd2.RequestLineSpec` | 2/main.go:42-62 | the method is the space-free prefix up to the first space; the URL is the space-free run that follows the spaces after it |
| `Httpd2.ScanWord` | 2/main.go:58-61 | the loop collects exactly the octets up to `RunEnd` |
| `Httpd2.SkipSpaces` | 2/main.go:53-55 | the loop stops exactly at `SpacesEnd` |
| `Httpd2.IndexOf` | 2/main.go:65 | `strings.IndexAny` with one octet: -1 iff it is absent, otherwise its first position |
| `Httpd2.SplitTarget` | 2/main.go:64-73 | the path is a prefix of the URL, and path and query together are no longer than the URL |
| `Httpd2.SplitTargetSpec` | 2/main.go:64-73 | the path has no `?`; with a `?` the URL is path, `?`, query; without one the path is the URL and the query is empty |
| `Httpd2.PairSpec` | 2/main.go:128-130 | `len(kv) == 2` iff the piece has exactly one `=`; then it is key, `=`, value, neither holding `=` |
| `Httpd2.StorePair` | 2/main.go:128-130 | a piece that is a pair stores its value under its key; every other key keeps its value and no other key appears |
| `Httpd2.StorePairs` | 2/main.go:127-132 | the keys after the loop are the old keys plus the keys of the pieces that are pairs, and no others |
| `Httpd2.StorePairsLast` | 2/main.go:127-132 | a key takes the value of the last pair that carries it |
| `Httpd2.StorePairsUntouched` | 2/main.go:127-132 | a key that no pair carries is present and valued as before |
| `Httpd2.QueryParams` | 2/main.go:122-133 | the parameters are exactly the keys of the `&`-separated pieces that are pairs |
| `Httpd2.StorePairsSpec` | 2/main.go:127-132 | a key is in the map iff it was there or some piece is a pair with that key; the last such pair wins; other keys keep their old values |
| `Httpd2.Params.constructor` | 2/main.go:102 | the parameter map starts empty |
| `Httpd2.ParseQueryString` | 2/main.go:122-133 | the map after the loop is the old map with the `&`-separated pairs stored in order |
| `Httpd2.HexValue` | 2/main.go:111 | a hex digit denotes a value below 16 |
| `Httpd2.HexRoundTrip` | 2/main.go:111 | the lowercase hex digit of d reads back as d |
| `Httpd2.EscapeByte` | 2/main.go:111 | every octet escapes to at least one octet |
| `Httpd2.ReadEscapedByte` | 2/main.go:111 | a JSON reader reads an escaped octet back as that octet |
| `Httpd2.ReadEscaped` | 2/main.go:111 | a JSON reader reads an escaped string back exactly, up to the closing quote, leaving what follows |
| `Httpd2.CameraJson` | 2/main.go:105-111 | the JSON object starts with `{"camera_id":` and ends with `,"code":200,"msg":"ok"}` |
| `Httpd2.CameraJsonReads` | 2/main.go:105-111 | the JSON object starts with `{"camera_id":` and its string reads back as the camera id, followed by `,"code":200,"msg":"ok"}` |
| `Httpd2.Response` | 2/main.go:101-120 | path `/` gives the JSON object; for any other path the body is `get_abc` iff the path is `get_abc` |
| `Httpd2.ResponseSpec` | 2/main.go:101-120 | path `/` gives the JSON object whose `camera_id` reads back as the query's parameter; `get_abc` gives `get_abc`; anything else gives `do't match` |
| `Httpd2.Execute` | 2/main.go:101-120 | the body is `Response` of the path and query |
| `Httpd2.HeaderChunks` | 2/main.go:85-99 | `header` writes six lines |
| `Httpd2.Reply` | 2/main.go:42-82 | a `GET` gets seven writes, starting with the 200 status line, whose `Content-Length` line carries the length of the seventh, the body; any other method gets eight, starting with the 501 status line |
| `Httpd2.GetReply` | 2/main.go:63-82 | a `GET` is answered by seven writes: the 200 status line first, and a `Content-Length` line carrying the length of the seventh write, the body |
| `Httpd2.Header` | 2/main.go:85-99 | the new state is that of writing the six header lines in order |
| `Httpd2.Unimplemented` | 2/main.go:10-28 | the new state is that of writing the eight lines of the 501 page in order |
| `Httpd2.AcceptRead` | 2/main.go:33-40 | after a successful read, the reply depends only on the octets read |
| `Httpd2.ReplyToGet` | 2/main.go:63-78 | the reply to a `GET` is the header for `application/json` with the body's length, then the body |
| `Httpd2.NonGetUnimplemented` | 2/main.go:49-52 | a method other than `GET` gets exactly the 501 page |
| `Httpd2.ContentLengthLine` | 2/main.go:93 | the `Content-Length` line carries decimal digits denoting the body's length |
| `Httpd2.GetAnswered` | 2/main.go:30-83 | with enough write budget, a `GET` gets the header and the body for the URL's path and query |
| `Httpd2.HeadersThenBody` | 2/main.go:77-78 | writing the header lines and then the body, every write accepted, appends the lines and then the body |
| `Httpd2.FailedReadSilent` | 2/main.go:34-38 | a failed read writes nothing |
| `Httpd2.Respond` | 2/main.go:42-82 | the new state is that of writing `Reply` of the octets read |
| `Httpd2.ScanTarget` | 2/main.go:53-73 | skipping spaces, scanning the URL and splitting it yield `SplitTarget` of the parsed URL |
| `Httpd2.SendJson` | 2/main.go:77-81 | the header and then the body are written |
| `Httpd2.RespondToGet` | 2/main.go:53-82 | after `GET`, the new state is that of writing `Reply` |
| `Httpd2.AcceptRequest` | 2/main.go:30-83 | the new state is `AfterAccept` |
| `Httpd2.AfterAccept` | 2/main.go:30-83 | `accept_request_thread` consumes exactly the octets of its one read, only extends the output, and changes nothing when the read fails |
| `Drift.ReadersDifferInReservedBit` | 3/main.go:33 | the readers of 6 and 3 fail on the same inputs and agree on every field but the stream id; 6's is 3's modulo 2^31, and they differ iff the reserved bit is set |
| `Drift.WritersAgreeBelowReservedBit` | 6/main.go:51-58 | below 2^31 the writer of 6 and the layout of 3 and 4 give the same octets |
| `Drift.WritersDifferAboveReservedBit` | 6/main.go:58 | from 2^31 on the writer of 6 sends octet 5 below 0x80, while the layout of 3 and 4 sends it at 0x80 or above |
| `Drift.HeadersResponseOverstated` | 3/main.go:95-104 | the HEADERS literal announces 12 octets of header block but carries 10 |
| `Drift.DataResponseStart` | 3/main.go:107-111 | the DATA literal starts `00 00 0A 00 01` |
| `Drift.HeadersReadTooFar` | 3/main.go:95-105 | a peer reading the HEADERS literal takes two octets of whatever follows as header block |
| `Drift.HeadersResponseSwallowsData` | 3/main.go:94-114 | a peer reading HEADERS + DATA gets one HEADERS frame ending in `00 00`; the rest announces 0x0A0001 octets and is never read |
| `Drift.SettingsOverstated` | 4/s/main.go:23-30 | the SETTINGS literal announces 18 octets but carries 10 |
| `Drift.SettingsSwallowsNextOctets` | 4/s/main.go:23-31 | a peer cannot read that SETTINGS frame until 8 more octets arrive, and then takes them as settings |

## Left out

- TLS, certificates, listening and accepting: the `main` functions of `6/`, `3/`, `4/s/` and `2/` are not modelled. Of `5/c/main.go`'s `main`, everything after the TLS dial is modelled (`Client5.RunClient`).
- Goroutines, `sync.WaitGroup` and interleaving: `3/main.go` handles each frame in a goroutine, and `5/c/main.go` sends its five requests from goroutines. The model runs them one after another, in source order, so it does not capture interleaved writes or reads.
- `Server3.ServesFrames`: in `3/main.go` the read loop is left only by the `return` at line 78, so `wg.Wait()` at line 88 is never reached, and the deferred `conn.Close()` of line 50 can cut off the replies of `handleFrame` goroutines still running. The model takes the schedule in which every reply is written before the connection closes.
- Short reads: in `4/s/main.go`, `5/c/main.go` and `2/main.go`, a `conn.Read` is modelled as seeing everything the peer sends, not only what has arrived so far. In `4/s` and `5/c` a read into a buffer is modelled as `io.ReadFull`. The model does not capture a read that returns fewer bytes than the buffer holds while more are still on their way.
- `Transport.Conn.Read`: the one `conn.Read` of `2/main.go` takes the first min(1024, n) octets of all n octets the client will send; a read that stops at a TCP segment boundary is not modelled. For example, a request line whose first segment is `GE` gives method `GE` and a 501 in the real server, which the model does not produce. I/O errors other than end of stream are not modelled.
- Write failures are modelled only as a budget of accepted writes. A partial write is not modelled.
- HPACK: header blocks are opaque bytes, as in the source. `parseHeaders`' result is only logged, so the handler does not use it.
- Logging and `fmt` output (`log.Println`, `fmt.Printf`, `fmt.Println("resp=%s\n", …)`) write nothing to the connection and are left out.
- `log.Fatalf` in the client becomes the outcome `Client5.Fatal`. Process exit is not modelled.
- `conn.Close` and `defer` are left out: the model has no closed state.
- `Httpd2.EscapeByte`: `json.Marshal` of Go 1.22 or later is modelled, for octets only. Earlier releases write `\u0008` and `\u000c` where the model writes `\b` and `\f`.
  - `"` and `\` get a backslash.
  - `\n`, `\r`, `\t`, `\b` and `\f` get their short escapes.
  - Other control octets, and `<`, `>`, `&`, become `\u00xx`.
  - Every other octet passes through.
  - Not modelled: replacing invalid UTF-8 with U+FFFD, and escaping U+2028/U+2029.
  - Keys are emitted sorted, as `json.Marshal` does for a map.
- `json.Marshal`'s error path cannot be reached for the map it is given, so it is not modelled.
- `parse_query_string`'s `len(kvs) == 0` return is dead: `strings.Split` never returns an empty slice. `Text.Split` proves there is at least one part, and the return is left out.
- `accept_request_thread`'s second `if method == "GET"` always holds there, so it is not modelled as a branch.
- Go's `int` and `uint32` width: the lengths and stream ids on the modelled paths fit in 32 bits, so the model needs no wrap-around. One exception is the 24-bit length field that `writeFrame` in `6/main.go` truncates. `Bytes.Be24OfBytes` states that truncation, and `Server6.WellFormed` frames never trigger it.
- `1/main.go` (an echo server), `client/main.go` and `7/main.go` (code using the standard HTTP/2 library) are not part of this model.
