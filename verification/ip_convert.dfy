/**
 Big-endian ("network byte order", Appendix B of RFC 791, Data Transmission
 Order) conversion between a 32-bit unsigned integer and the first four bytes
 of an IPv4 address buffer, as done with binary.BigEndian.PutUint32 and
 binary.BigEndian.Uint32 in ip_convert.go.
 */
module IpConvert {

  type byte = x: int | 0 <= x < 256
  type uint32 = x: int | 0 <= x < 0x1_0000_0000

  /** Reference meaning of a byte string read most significant byte first. */
  function BigEndianValue(b: seq<byte>): nat
  {
    if |b| == 0 then 0 else BigEndianValue(b[..|b| - 1]) * 256 + b[|b| - 1]
  }

  function Pow256(k: nat): (p: nat)
    ensures p > 0
  {
    if k == 0 then 1 else 256 * Pow256(k - 1)
  }

  /** The k-th base-256 digit of v, counting from the least significant one. */
  function Digit(v: nat, k: nat): byte
  {
    v / Pow256(k) % 256
  }

  /**
   Writes v into buf[0..4], most significant byte first. Go stores
   byte(v >> 8k): shifting right by 8k bits is division by 256^k, and the
   conversion to byte keeps the low eight bits, the remainder modulo 256.
   The rest of the buffer is kept. Go panics on a buffer shorter than four
   bytes.
   */
  function PutUint32(buf: seq<byte>, v: uint32): (b: seq<byte>)
    requires |buf| >= 4
    ensures |b| == |buf|
    ensures b[4..] == buf[4..]
    ensures BigEndianValue(b[..4]) == v
  {
    var b := [v / 0x100_0000 % 256, v / 0x1_0000 % 256, v / 0x100 % 256, v % 256] + buf[4..];
    assert b[..4] == [b[0], b[1], b[2], b[3]];
    BigEndianValueOfFour(b[0], b[1], b[2], b[3]);
    b
  }

  /**
   Reads buf[0..4] as a big-endian 32-bit value. Go ORs the shifted bytes;
   the shifted bytes occupy disjoint bits, so the OR equals their sum.
   */
  function Uint32(b: seq<byte>): (v: uint32)
    requires |b| >= 4
    ensures v == BigEndianValue(b[..4])
  {
    assert b[..4] == [b[0], b[1], b[2], b[3]];
    BigEndianValueOfFour(b[0], b[1], b[2], b[3]);
    b[0] as int * 0x100_0000 + b[1] as int * 0x1_0000 + b[2] as int * 0x100 + b[3] as int
  }

  lemma BigEndianValueOfFour(b0: byte, b1: byte, b2: byte, b3: byte)
    ensures BigEndianValue([b0, b1, b2, b3]) == b0 as int * 0x100_0000 + b1 as int * 0x1_0000 + b2 as int * 0x100 + b3 as int
  {
    assert [b0][..0] == [];
    assert BigEndianValue([b0]) == b0;
    assert [b0, b1][..1] == [b0];
    assert BigEndianValue([b0, b1]) == b0 as int * 0x100 + b1;
    assert [b0, b1, b2][..2] == [b0, b1];
    assert BigEndianValue([b0, b1, b2]) == b0 as int * 0x1_0000 + b1 as int * 0x100 + b2;
    assert [b0, b1, b2, b3][..3] == [b0, b1, b2];
  }

  /** Two four-byte strings with the same big-endian value are equal. */
  lemma BigEndianValueInjective(a: seq<byte>, b: seq<byte>)
    requires |a| == 4 && |b| == 4
    requires BigEndianValue(a) == BigEndianValue(b)
    ensures a == b
  {
    assert a == [a[0], a[1], a[2], a[3]];
    assert b == [b[0], b[1], b[2], b[3]];
    BigEndianValueOfFour(a[0], a[1], a[2], a[3]);
    BigEndianValueOfFour(b[0], b[1], b[2], b[3]);
  }

  /** Byte i of the encoding is base-256 digit 3 - i of v. */
  lemma PutUint32Layout(buf: seq<byte>, v: uint32)
    requires |buf| >= 4
    ensures forall i :: 0 <= i < 4 ==> PutUint32(buf, v)[i] == Digit(v, 3 - i)
  {
    assert Pow256(0) == 1;
    assert Pow256(1) == 0x100;
    assert Pow256(2) == 0x1_0000;
    assert Pow256(3) == 0x100_0000;
  }

  /** Decoding what was encoded gives back the value, whatever the buffer held. */
  lemma RoundTrip(buf: seq<byte>, v: uint32)
    requires |buf| >= 4
    ensures Uint32(PutUint32(buf, v)) == v
  {
  }

  /** Encoding the decoded value of a buffer writes back the bytes it already had. */
  lemma InverseRoundTrip(b: seq<byte>)
    requires |b| >= 4
    ensures PutUint32(b, Uint32(b)) == b
  {
    var e := PutUint32(b, Uint32(b));
    BigEndianValueInjective(e[..4], b[..4]);
    assert e == e[..4] + e[4..];
    assert b == b[..4] + b[4..];
  }

  /** The address used in ip_convert.go: 173218814 is 10.83.27.254. */
  lemma ExampleAddress()
    ensures PutUint32([0, 0, 0, 0], 173218814) == [10, 83, 27, 254]
    ensures Uint32([10, 83, 27, 254]) == 173218814
  {
  }
}
