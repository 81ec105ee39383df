/**
  Byte-level vocabulary shared by the command encoder and the response
  decoder: bytes, unsigned 32-bit values, the C conversion to `UBYTE`, and the
  4-byte layout of a `ULONG` in either byte order.
 */
module Bytes {

  /** One octet, as `UBYTE` holds it. */
  type byte = x: int | 0 <= x < 0x100

  /** An unsigned 32-bit value, as `ULONG` holds it. */
  type uint32 = x: int | 0 <= x < 0x1_0000_0000

  /** The order in which the four bytes of a `ULONG` are laid out in memory.
      The program copies `ULONG`s to and from byte buffers with `memcpy` and
      plain structure access, so the layout is the host's; it is a parameter
      here rather than a fixed choice. */
  datatype ByteOrder = BigEndian | LittleEndian

  datatype Option<T> = None | Some(value: T)

  /** `n` zero bytes: the contents of a zero-initialised static buffer. */
  function Zeros(n: nat): (r: seq<byte>)
    ensures |r| == n
    ensures forall i :: 0 <= i < n ==> r[i] == 0
  {
    seq(n, _ => 0)
  }

  /** The C conversion of an integer to `UBYTE`: the value modulo 256, also
      for negative values. */
  function Truncate8(x: int): (r: byte)
    ensures exists k :: x == k * 0x100 + r
  {
    var r := x % 0x100;
    assert x == (x / 0x100) * 0x100 + r;
    r
  }

  /** The four bytes of `x`, most significant first. */
  function BigEndianBytes(x: uint32): seq<byte>
  {
    var b3 := x % 0x100;
    var x1 := x / 0x100;
    var b2 := x1 % 0x100;
    var x2 := x1 / 0x100;
    var b1 := x2 % 0x100;
    var b0 := x2 / 0x100;
    [b0, b1, b2, b3]
  }

  /** The value of four bytes read most significant first. */
  function BigEndianValue(b: seq<byte>): uint32
    requires |b| == 4
  {
    ((b[0] as int * 0x100 + b[1]) * 0x100 + b[2]) * 0x100 + b[3]
  }

  function Reverse4(b: seq<byte>): (r: seq<byte>)
    requires |b| == 4
    ensures |r| == 4
  {
    [b[3], b[2], b[1], b[0]]
  }

  /** The in-memory bytes of a `ULONG` holding `x`. */
  function Encode32(x: uint32, order: ByteOrder): (r: seq<byte>)
    ensures |r| == 4
    ensures Decode32(r, order) == x
  {
    BigEndianRoundTrip(x);
    match order
    case BigEndian => BigEndianBytes(x)
    case LittleEndian => Reverse4(BigEndianBytes(x))
  }

  /** The `ULONG` whose in-memory bytes are `b`. */
  function Decode32(b: seq<byte>, order: ByteOrder): uint32
    requires |b| == 4
  {
    match order
    case BigEndian => BigEndianValue(b)
    case LittleEndian => BigEndianValue(Reverse4(b))
  }

  lemma BigEndianRoundTrip(x: uint32)
    ensures BigEndianValue(BigEndianBytes(x)) == x
  {
  }

  lemma BigEndianValueRoundTrip(b: seq<byte>)
    requires |b| == 4
    ensures BigEndianBytes(BigEndianValue(b)) == b
  {
    var w2: int := b[0] as int * 0x100 + b[1];
    var w1: int := w2 * 0x100 + b[2];
    var x: int := w1 * 0x100 + b[3];
    assert x % 0x100 == b[3] && x / 0x100 == w1;
    assert w1 % 0x100 == b[2] && w1 / 0x100 == w2;
    assert w2 % 0x100 == b[1] && w2 / 0x100 == b[0];
  }

  /** Every 4-byte pattern is the layout of exactly one `ULONG`: decoding
      and re-encoding gives the bytes back. */
  lemma Encode32Decode32(b: seq<byte>, order: ByteOrder)
    requires |b| == 4
    ensures Encode32(Decode32(b, order), order) == b
  {
    match order
    case BigEndian =>
      BigEndianValueRoundTrip(b);
    case LittleEndian =>
      BigEndianValueRoundTrip(Reverse4(b));
      assert Reverse4(Reverse4(b)) == b;
  }
}
