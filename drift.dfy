/** Where the re-implementations of the frame layer disagree with each other
    or with the lengths they declare: the reserved bit of the stream id,
    which only 6/main.go clears, and two hand-built frames of 3/main.go and
    4/s/main.go whose length fields announce more octets than they carry. */
module Drift {
  import opened Bytes
  import Server3
  import Server4
  import Server6

  /** The readers of 6/main.go and 3/main.go fail on the same inputs and read
      the same length, type, flags, payload and rest; the stream id of 6 is
      that of 3 with the reserved bit cleared, and the two differ exactly when
      that bit is set on the wire. */
  lemma ReadersDifferInReservedBit(input: seq<Byte>)
    ensures Server6.Decode(input).Ok? <==> Server3.Decode(input).Ok?
    ensures Server6.Decode(input).Ok? ==>
              var d6 := Server6.Decode(input).value;
              var d3 := Server3.Decode(input).value;
              && d6.frame.length == d3.frame.length
              && d6.frame.ftype == d3.frame.ftype && d6.frame.flags == d3.frame.flags
              && d6.frame.payload == d3.frame.payload && d6.rest == d3.rest
              && d6.frame.streamId == d3.frame.streamId % 0x8000_0000
              && (d6.frame.streamId == d3.frame.streamId <==> input[5] < 0x80)
  {
    if Server3.Decode(input).Ok? {
      Server3.ReservedBitKept(input);
      var sid := Server3.Decode(input).value.frame.streamId;
      if sid < 0x8000_0000 {
        DivModUnique(sid, 0x8000_0000, 0, sid);
      } else {
        DivModUnique(sid, 0x8000_0000, 1, sid - 0x8000_0000);
      }
    }
  }

  /** For a stream id below 2^31 the writer of 6/main.go and the byte layout
      of 3/main.go and 4/s/main.go produce the same octets. */
  lemma WritersAgreeBelowReservedBit(length: nat, ftype: Byte, flags: Byte, streamId: nat, payload: seq<Byte>)
    requires length < 0x100_0000 && streamId < 0x8000_0000
    ensures Server6.Encode(Server6.Frame(length, ftype, flags, streamId, payload))
            == Server3.Layout(Server3.Frame(length, ftype, flags, streamId, payload))
  {
    DivModUnique(streamId, 0x8000_0000, 0, streamId);
  }

  /** From 2^31 on they differ: the writer of 6/main.go sends octet 5 with
      its top bit clear, while the layout of 3/main.go and 4/s/main.go sends
      it with the top bit set. */
  lemma WritersDifferAboveReservedBit(length: nat, ftype: Byte, flags: Byte, streamId: nat, payload: seq<Byte>)
    requires length < 0x1_0000_0000 && 0x8000_0000 <= streamId < 0x1_0000_0000
    ensures Server6.Encode(Server6.Frame(length, ftype, flags, streamId, payload))[5] < 0x80
    ensures Server3.Layout(Server3.Frame(length, ftype, flags, streamId, payload))[5] >= 0x80
  {
    Server6.EncodeFields(Server6.Frame(length, ftype, flags, streamId, payload));
    var b := Server3.Layout(Server3.Frame(length, ftype, flags, streamId, payload));
    Be32OfBytes(streamId);
    assert b[5..9] == Be32Bytes(streamId);
  }

  /** The HEADERS response of 3/main.go declares 12 octets of header block
      but carries 10. */
  lemma HeadersResponseOverstated(streamId: nat)
    ensures Server3.HeadersResponse(streamId).length == 12
    ensures |Server3.HeadersResponse(streamId).payload| == 10
  {
  }

  /** The header of the DATA response of 3/main.go starts `00 00 0A 00 01`. */
  lemma DataResponseStart(streamId: nat)
    requires streamId < 0x1_0000_0000
    ensures var data := Server3.Layout(Server3.DataResponse(streamId));
            data[0] == 0 && data[1] == 0 && data[2] == 0x0A && data[3] == 0 && data[4] == 1
  {
    Server3.LayoutFields(Server3.DataResponse(streamId));
  }

  /** The HEADERS frame read off the response of 3/main.go ends two octets
      into the DATA frame. */
  lemma HeadersReadTooFar(streamId: nat, data: seq<Byte>)
    requires streamId < 0x1_0000_0000 && |data| >= 2
    ensures Server3.Decode(Server3.Layout(Server3.HeadersResponse(streamId)) + data) ==
            Server3.Ok(Server3.Decoded(
              Server3.Frame(12, 1, 4, streamId, Server3.ResponseHeaderBlock + data[..2]), data[2..]))
  {
    var headers := Server3.Layout(Server3.HeadersResponse(streamId));
    Server3.LayoutFields(Server3.HeadersResponse(streamId));
    var h := headers[..Server3.FrameHeaderLen];
    assert headers == h + Server3.ResponseHeaderBlock;
    var payload := Server3.ResponseHeaderBlock + data[..2];
    assert headers + data == h + payload + data[2..] by {
      assert data == data[..2] + data[2..];
      AppendAssoc(h, Server3.ResponseHeaderBlock, data);
      AppendAssoc(Server3.ResponseHeaderBlock, data[..2], data[2..]);
      AppendAssoc(h, payload, data[2..]);
    }
    Server3.DecodeOfParts(headers + data, h, payload, data[2..]);
  }

  /** A peer reading the HEADERS + DATA response of 3/main.go takes the
      first two octets of the DATA frame as the end of the header block;
      what is left announces a payload of 0x0A0001 octets, so the DATA frame
      is never read. */
  lemma HeadersResponseSwallowsData(streamId: nat)
    requires streamId < 0x1_0000_0000
    ensures var data := Server3.Layout(Server3.DataResponse(streamId));
            var wire := Server3.Layout(Server3.HeadersResponse(streamId)) + data;
            && Server3.Decode(wire) ==
               Server3.Ok(Server3.Decoded(
                 Server3.Frame(12, 1, 4, streamId, Server3.ResponseHeaderBlock + data[..2]), data[2..]))
            && Server3.Decode(data[2..]) == Server3.Err(Server3.PayloadTruncated)
            && Server3.DecodeAll(wire) == [Server3.Frame(12, 1, 4, streamId, Server3.ResponseHeaderBlock + data[..2])]
  {
    var data := Server3.Layout(Server3.DataResponse(streamId));
    HeadersReadTooFar(streamId, data);
    DataResponseStart(streamId);
    var left := data[2..];
    assert left[0] == 0x0A && left[1] == 0 && left[2] == 1;
    assert Server3.DecodeAll(left) == [];
  }

  /** The SETTINGS frame of 4/s/main.go declares 18 octets of settings but
      carries 10. */
  lemma SettingsOverstated()
    ensures Be24(Server4.Settings[0], Server4.Settings[1], Server4.Settings[2]) == 18
    ensures |Server4.Settings| - Server3.FrameHeaderLen == 10
  {
  }

  /** A peer reading that SETTINGS frame takes the next 8 octets the server
      sends as part of it, and cannot read it at all until they arrive. */
  lemma SettingsSwallowsNextOctets(next: seq<Byte>)
    ensures |next| < 8 ==> Server3.Decode(Server4.Settings + next) == Server3.Err(Server3.PayloadTruncated)
    ensures |next| >= 8 ==>
              Server3.Decode(Server4.Settings + next) ==
              Server3.Ok(Server3.Decoded(Server3.Frame(18, 4, 0, 0, Server4.Settings[9..] + next[..8]), next[8..]))
  {
    var wire := Server4.Settings + next;
    if |next| >= 8 {
      var h := Server4.Settings[..9];
      assert wire == h + (Server4.Settings[9..] + next[..8]) + next[8..];
      Server3.DecodeOfParts(wire, h, Server4.Settings[9..] + next[..8], next[8..]);
    }
  }
}
