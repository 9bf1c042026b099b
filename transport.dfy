/** A connection (`net.Conn`, plain or TLS) as the frame programs use it:
    a stream of bytes the peer sends, the bytes written back, and a peer that
    may stop accepting writes. */
module Transport {
  import opened Bytes

  /** The connection preface of section 3.5 of RFC 7540, the same 24 octets in
      every variant: `PRI * HTTP/2.0\r\n\r\nSM\r\n\r\n`. */
  const ClientPreface: seq<Byte> :=
    [0x50, 0x52, 0x49, 0x20, 0x2a, 0x20, 0x48, 0x54, 0x54, 0x50, 0x2f, 0x32,
     0x2e, 0x30, 0x0d, 0x0a, 0x0d, 0x0a, 0x53, 0x4d, 0x0d, 0x0a, 0x0d, 0x0a]

  /** The octets above are the ASCII text of the preface. */
  lemma ClientPrefaceText()
    ensures ClientPreface == Ascii("PRI * HTTP/2.0\r\n\r\nSM\r\n\r\n")
  {
  }

  /** The observable state of one connection.
      `input`: the bytes the peer has yet to deliver, in order.
      `output`: every byte written so far, in order.
      `writesLeft`: how many further `Write` calls the transport accepts;
      once it is zero every `Write` fails and sends nothing. */
  datatype Wire = Wire(input: seq<Byte>, output: seq<Byte>, writesLeft: nat)

  /** The state after `io.ReadFull(conn, buf)` with `len(buf) == n`: the read
      succeeds when `n` bytes are there and consumes them; otherwise it fails
      after consuming whatever was left. */
  function AfterRead(w: Wire, n: nat): (r: Wire)
    ensures r.output == w.output && r.writesLeft == w.writesLeft
    ensures n <= |w.input| ==> w.input == w.input[..n] + r.input
    ensures n > |w.input| ==> r.input == []
  {
    if n <= |w.input| then w.(input := w.input[n..]) else w.(input := [])
  }

  /** Whether the next `Write` call succeeds. */
  predicate CanWrite(w: Wire)
  {
    w.writesLeft > 0
  }

  /** The state after `conn.Write(data)`. */
  function AfterWrite(w: Wire, data: seq<Byte>): (r: Wire)
    ensures r.input == w.input
    ensures CanWrite(w) ==> r.output == w.output + data && r.writesLeft + 1 == w.writesLeft
    ensures !CanWrite(w) ==> r == w
  {
    if CanWrite(w) then w.(output := w.output + data, writesLeft := w.writesLeft - 1) else w
  }

  /** Consecutive writes whose errors are ignored (`_, _ = conn.Write(...)`). */
  function WriteAll(w: Wire, chunks: seq<seq<Byte>>): (r: Wire)
    ensures r.input == w.input && w.output <= r.output
    decreases |chunks|
  {
    if chunks == [] then w else WriteAll(AfterWrite(w, chunks[0]), chunks[1..])
  }

  /** The bytes of consecutive chunks, concatenated. */
  function Concat(chunks: seq<seq<Byte>>): (r: seq<Byte>)
    decreases |chunks|
  {
    if chunks == [] then [] else chunks[0] + Concat(chunks[1..])
  }

  lemma ConcatAppend(a: seq<seq<Byte>>, b: seq<seq<Byte>>)
    ensures Concat(a + b) == Concat(a) + Concat(b)
    decreases |a|
  {
    if a != [] {
      assert (a + b)[0] == a[0] && (a + b)[1..] == a[1..] + b;
      ConcatAppend(a[1..], b);
      assert Concat(a + b) == a[0] + Concat(a[1..] + b);
    } else {
      assert a + b == b;
    }
  }

  /** When the peer accepts every write, ignored-error writes deliver all the
      chunks in order and use one write call per chunk. */
  lemma {:induction false} WriteAllDelivers(w: Wire, chunks: seq<seq<Byte>>)
    requires w.writesLeft >= |chunks|
    ensures WriteAll(w, chunks) == w.(output := w.output + Concat(chunks), writesLeft := w.writesLeft - |chunks|)
    decreases |chunks|
  {
    if chunks != [] {
      WriteAllDelivers(AfterWrite(w, chunks[0]), chunks[1..]);
    }
  }

  /** Writes only ever append to what was written. */
  lemma {:induction false} WriteAllExtends(w: Wire, chunks: seq<seq<Byte>>)
    ensures w.output <= WriteAll(w, chunks).output
    ensures WriteAll(w, chunks).writesLeft <= w.writesLeft
    decreases |chunks|
  {
    if chunks != [] {
      WriteAllExtends(AfterWrite(w, chunks[0]), chunks[1..]);
    }
  }

  /** One ignored-error write. */
  lemma WriteOne(w: Wire, a: seq<Byte>)
    ensures WriteAll(w, [a]) == AfterWrite(w, a)
  {
    assert [a][1..] == [];
  }

  /** Two ignored-error writes in a row. */
  lemma WriteTwo(w: Wire, a: seq<Byte>, b: seq<Byte>)
    ensures WriteAll(w, [a, b]) == AfterWrite(AfterWrite(w, a), b)
  {
    assert [a, b][0] == a && [a, b][1..] == [b];
    WriteOne(AfterWrite(w, a), b);
  }

  /** The `k`-th of a run of ignored-error writes, taken on its own. */
  lemma WriteAllStep(w: Wire, chunks: seq<seq<Byte>>, k: nat)
    requires k < |chunks|
    ensures WriteAll(w, chunks[k..]) == WriteAll(AfterWrite(w, chunks[k]), chunks[k + 1..])
  {
    assert chunks[k..][0] == chunks[k] && chunks[k..][1..] == chunks[k + 1..];
  }

  /** One more ignored-error write after a run of them. */
  lemma {:induction false} WriteAllSnoc(w: Wire, chunks: seq<seq<Byte>>, last: seq<Byte>)
    ensures WriteAll(w, chunks + [last]) == AfterWrite(WriteAll(w, chunks), last)
    decreases |chunks|
  {
    if chunks == [] {
      assert chunks + [last] == [last];
      WriteOne(w, last);
    } else {
      assert (chunks + [last])[0] == chunks[0] && (chunks + [last])[1..] == chunks[1..] + [last];
      WriteAllSnoc(AfterWrite(w, chunks[0]), chunks[1..], last);
    }
  }

  /** Writes neither read nor depend on the input still to come. */
  lemma {:induction false} WriteAllInput(w: Wire, chunks: seq<seq<Byte>>, input: seq<Byte>)
    ensures WriteAll(w.(input := input), chunks) == WriteAll(w, chunks).(input := input)
    decreases |chunks|
  {
    if chunks != [] {
      assert AfterWrite(w.(input := input), chunks[0]) == AfterWrite(w, chunks[0]).(input := input);
      WriteAllInput(AfterWrite(w, chunks[0]), chunks[1..], input);
    }
  }

  /** A connection object whose reads and writes change its state in place. */
  class Conn {
    var input: seq<Byte>
    var output: seq<Byte>
    var writesLeft: nat

    function State(): Wire
      reads this
    {
      Wire(input, output, writesLeft)
    }

    constructor (incoming: seq<Byte>, writeCalls: nat)
      ensures State() == Wire(incoming, [], writeCalls)
    {
      input, output, writesLeft := incoming, [], writeCalls;
    }

    /** `io.ReadFull(conn, buf)` with `len(buf) == n`. */
    method ReadFull(n: nat) returns (data: seq<Byte>, ok: bool)
      modifies this
      ensures ok == (n <= |old(input)|)
      ensures ok ==> data == old(input)[..n]
      ensures State() == AfterRead(old(State()), n)
    {
      ok := n <= |input|;
      if ok {
        data := input[..n];
        input := input[n..];
      } else {
        data := input;
        input := [];
      }
    }

    /** One `conn.Read(buf)` with `len(buf) == max > 0`: it fails at the end
        of the stream and otherwise returns what is there, up to `max` bytes. */
    method Read(max: nat) returns (data: seq<Byte>, ok: bool)
      requires max > 0
      modifies this
      ensures ok == (old(input) != [])
      ensures |data| <= |old(input)|
      ensures ok ==> |data| > 0 && data == old(input)[..|data|]
      ensures ok ==> |data| == if |old(input)| < max then |old(input)| else max
      ensures State() == old(State()).(input := old(input)[|data|..])
    {
      ok := input != [];
      var n := if |input| < max then |input| else max;
      data := input[..n];
      input := input[n..];
    }

    /** `conn.Write(data)`. */
    method Write(data: seq<Byte>) returns (ok: bool)
      modifies this
      ensures ok == CanWrite(old(State()))
      ensures State() == AfterWrite(old(State()), data)
    {
      ok := writesLeft > 0;
      if ok {
        output := output + data;
        writesLeft := writesLeft - 1;
      }
    }
  }
}
