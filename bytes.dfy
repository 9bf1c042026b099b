/** Octets, fixed-width unsigned integers and their big-endian byte layout,
    as used by every frame variant of the repository. */
module Bytes {

  /** One octet. Go's `byte`/`uint8`. */
  type Byte = b: int | 0 <= b < 0x100

  /** Go's `uint32`. */
  type U32 = x: int | 0 <= x < 0x1_0000_0000

  datatype Option<+T> = None | Some(value: T)

  /** The bytes of an ASCII text; a character outside one octet keeps only
      its low eight bits, which never happens for the literals of the source. */
  function Ascii(s: string): (r: seq<Byte>)
    ensures |r| == |s|
  {
    seq(|s|, i requires 0 <= i < |s| => (s[i] as int) % 0x100)
  }

  /** Concatenation is associative; stated for the solver, which otherwise
      reasons about it index by index. */
  lemma AppendAssoc<T>(a: seq<T>, b: seq<T>, c: seq<T>)
    ensures (a + b) + c == a + (b + c)
  {
  }

  /** The 24-bit big-endian value of three octets. Go writes
      `int(b0)<<16 | int(b1)<<8 | int(b2)`; the three shifted octets occupy
      disjoint bits, so the `|` is a sum. */
  function Be24(b0: Byte, b1: Byte, b2: Byte): (v: nat)
    ensures v < 0x100_0000
  {
    b0 * 0x1_0000 + b1 * 0x100 + b2
  }

  /** The 32-bit big-endian value of four octets (`binary.BigEndian.Uint32`). */
  function Be32(b0: Byte, b1: Byte, b2: Byte, b3: Byte): (v: nat)
    ensures v < 0x1_0000_0000
  {
    b0 * 0x100_0000 + b1 * 0x1_0000 + b2 * 0x100 + b3
  }

  /** The low `n` octets of `x`, most significant first. */
  function BeBytes(x: nat, n: nat): (r: seq<Byte>)
    ensures |r| == n
    decreases n
  {
    if n == 0 then [] else BeBytes(x / 0x100, n - 1) + [x % 0x100]
  }

  /** `byte(x >> 16), byte(x >> 8), byte(x)`: the low 24 bits of `x`, big-endian. */
  function Be24Bytes(x: nat): (r: seq<Byte>)
    ensures |r| == 3
  {
    BeBytes(x, 3)
  }

  /** `byte(x >> 24), byte(x >> 16), byte(x >> 8), byte(x)` (also
      `binary.BigEndian.PutUint32`): the low 32 bits of `x`, big-endian. */
  function Be32Bytes(x: nat): (r: seq<Byte>)
    ensures |r| == 4
  {
    BeBytes(x, 4)
  }

  /** The three octets as Go computes them, one shift each. */
  lemma Be24BytesShifts(x: nat)
    ensures Be24Bytes(x) == [(x / 0x1_0000) % 0x100, (x / 0x100) % 0x100, x % 0x100]
  {
    PeelOctet(x);
    assert BeBytes(x, 3) == BeBytes(x / 0x100, 2) + [x % 0x100];
    assert BeBytes(x / 0x100, 2) == BeBytes(x / 0x100 / 0x100, 1) + [(x / 0x100) % 0x100];
    assert BeBytes(x / 0x100 / 0x100, 1) == [] + [(x / 0x100 / 0x100) % 0x100];
  }

  /** The four octets as Go computes them, one shift each. */
  lemma Be32BytesShifts(x: nat)
    ensures Be32Bytes(x) == [(x / 0x100_0000) % 0x100, (x / 0x1_0000) % 0x100, (x / 0x100) % 0x100, x % 0x100]
  {
    PeelOctet(x);
    assert BeBytes(x, 4) == BeBytes(x / 0x100, 3) + [x % 0x100];
    Be24BytesShifts(x / 0x100);
    PeelOctet(x / 0x100);
  }

  /** Euclidean division is unique: this is how a quotient/remainder pair is recognised. */
  lemma DivModUnique(x: int, d: int, q: int, r: int)
    requires 0 < d && x == d * q + r && 0 <= r < d
    ensures x / d == q && x % d == r
  {
    var q', r' := x / d, x % d;
    assert d * (q - q') == r' - r;
    if q > q' {
      MulMonotone(d, q - q');
    } else if q < q' {
      MulMonotone(d, q' - q);
    }
  }

  /** A positive multiple of `d` is at least `d`. */
  lemma MulMonotone(d: int, k: int)
    requires 0 < d && 1 <= k
    ensures d * k >= d
  {
  }

  /** Peeling one octet off the low end of a natural number. */
  lemma PeelOctet(x: nat)
    ensures x == 0x100 * (x / 0x100) + x % 0x100
    ensures x / 0x1_0000 == (x / 0x100) / 0x100
    ensures x / 0x100_0000 == (x / 0x1_0000) / 0x100
  {
    var q := x / 0x100;
    var q2 := q / 0x100;
    var q3 := q2 / 0x100;
    assert x == 0x1_0000 * q2 + 0x100 * (q % 0x100) + x % 0x100;
    DivModUnique(x, 0x1_0000, q2, 0x100 * (q % 0x100) + x % 0x100);
    assert x == 0x100_0000 * q3 + 0x1_0000 * (q2 % 0x100) + 0x100 * (q % 0x100) + x % 0x100;
    DivModUnique(x, 0x100_0000, q3, 0x1_0000 * (q2 % 0x100) + 0x100 * (q % 0x100) + x % 0x100);
  }

  /** Encoding then decoding 24 bits keeps exactly the low 24 bits. */
  lemma Be24OfBytes(x: nat)
    ensures var r := Be24Bytes(x); Be24(r[0], r[1], r[2]) == x % 0x100_0000
  {
    Be24BytesShifts(x);
    PeelOctet(x);
    var q := x / 0x100;
    var q2 := q / 0x100;
    assert q == 0x100 * q2 + q % 0x100;
    assert q2 == 0x100 * (q2 / 0x100) + q2 % 0x100;
    var low := Be24(q2 % 0x100, q % 0x100, x % 0x100);
    assert x == 0x100 * (0x100 * q2 + q % 0x100) + x % 0x100;
    assert x == 0x100_0000 * (q2 / 0x100) + low;
    DivModUnique(x, 0x100_0000, q2 / 0x100, low);
  }

  /** Encoding then decoding a 32-bit value gives it back. */
  lemma Be32OfBytes(x: nat)
    requires x < 0x1_0000_0000
    ensures var r := Be32Bytes(x); Be32(r[0], r[1], r[2], r[3]) == x
  {
    Be32BytesShifts(x);
    PeelOctet(x);
    var q := x / 0x100;
    var q2 := q / 0x100;
    var q3 := q2 / 0x100;
    assert q == 0x100 * q2 + q % 0x100;
    assert q2 == 0x100 * q3 + q2 % 0x100;
    assert q3 < 0x100;
    assert x == 0x100 * (0x100 * (0x100 * q3 + q2 % 0x100) + q % 0x100) + x % 0x100;
  }

  /** Clearing the top bit of a 32-bit big-endian value (`& 0x7FFFFFFF`)
      clears the top bit of its first octet and leaves the others alone. */
  lemma Be32ClearTop(b0: Byte, b1: Byte, b2: Byte, b3: Byte)
    ensures Be32(b0, b1, b2, b3) % 0x8000_0000 == Be32(b0 % 0x80, b1, b2, b3)
  {
    assert Be32(b0, b1, b2, b3) == 0x8000_0000 * (b0 / 0x80) + Be32(b0 % 0x80, b1, b2, b3);
    DivModUnique(Be32(b0, b1, b2, b3), 0x8000_0000, b0 / 0x80, Be32(b0 % 0x80, b1, b2, b3));
  }

  /** Decoding then encoding three octets gives them back. */
  lemma BytesOfBe24(b0: Byte, b1: Byte, b2: Byte)
    ensures Be24Bytes(Be24(b0, b1, b2)) == [b0, b1, b2]
  {
    var x := Be24(b0, b1, b2);
    Be24BytesShifts(x);
    DivModUnique(x, 0x100, b0 * 0x100 + b1, b2);
    DivModUnique(x, 0x1_0000, b0, b1 * 0x100 + b2);
    DivModUnique(b0 * 0x100 + b1, 0x100, b0, b1);
  }

  /** Decoding then encoding four octets gives them back. */
  lemma BytesOfBe32(b0: Byte, b1: Byte, b2: Byte, b3: Byte)
    ensures Be32Bytes(Be32(b0, b1, b2, b3)) == [b0, b1, b2, b3]
  {
    var x := Be32(b0, b1, b2, b3);
    Be32BytesShifts(x);
    DivModUnique(x, 0x100, b0 * 0x1_0000 + b1 * 0x100 + b2, b3);
    DivModUnique(x, 0x1_0000, b0 * 0x100 + b1, b2 * 0x100 + b3);
    DivModUnique(x, 0x100_0000, b0, b1 * 0x1_0000 + b2 * 0x100 + b3);
    DivModUnique(b0 * 0x1_0000 + b1 * 0x100 + b2, 0x100, b0 * 0x100 + b1, b2);
    DivModUnique(b0 * 0x100 + b1, 0x100, b0, b1);
  }
}
