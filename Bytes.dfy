/** Bytes, unsigned 32-bit integers and their big-endian wire form.
    Both the decoder and the encoder use the same 4-byte, most significant
    byte first, layout for the width and the height. */
module Bytes {

  /** An unsigned 32-bit integer, as Rust's `u32`. */
  type u32 = x: int | 0 <= x < 0x1_0000_0000

  /** An unsigned 8-bit integer, as Rust's `u8`. */
  type byte = x: int | 0 <= x < 0x100

  /** The 4 bytes of `x`, most significant first (`write_u32::<BigEndian>`). */
  function BigEndian32(x: u32): (b: seq<byte>)
    ensures |b| == 4
  {
    [x / 0x100_0000, (x / 0x1_0000) % 0x100, (x / 0x100) % 0x100, x % 0x100]
  }

  /** The value of 4 bytes read most significant first (`BigEndian::read_u32`). */
  function ReadBigEndian32(b: seq<byte>): (x: u32)
    requires |b| == 4
    ensures x / 0x100_0000 == b[0] && (x / 0x1_0000) % 0x100 == b[1]
    ensures (x / 0x100) % 0x100 == b[2] && x % 0x100 == b[3]
  {
    var b0, b1, b2, b3 := b[0] as int, b[1] as int, b[2] as int, b[3] as int;
    var x := b0 * 0x100_0000 + b1 * 0x1_0000 + b2 * 0x100 + b3;
    assert x / 0x100 == b0 * 0x1_0000 + b1 * 0x100 + b2;
    assert x / 0x1_0000 == b0 * 0x100 + b1;
    x
  }

  /** Reading back what was written gives the original integer. */
  lemma ReadWritten(x: u32)
    ensures ReadBigEndian32(BigEndian32(x)) == x
  {
    var b := BigEndian32(x);
    var hi, q2, q1 := x / 0x100_0000, x / 0x1_0000, x / 0x100;
    assert b[0] == hi;
    assert b[1] == q2 % 0x100;
    assert b[2] == q1 % 0x100;
    assert b[3] == x % 0x100;
    assert q2 == hi * 0x100 + q2 % 0x100;
    assert q1 == q2 * 0x100 + q1 % 0x100;
    assert x == q1 * 0x100 + x % 0x100;
  }

  /** Writing what was read gives back the same 4 bytes: every 4-byte group
      is the encoding of exactly one integer. */
  lemma WrittenRead(b: seq<byte>)
    requires |b| == 4
    ensures BigEndian32(ReadBigEndian32(b)) == b
  {
    var x := ReadBigEndian32(b);
    var b0, b1, b2, b3 := b[0] as int, b[1] as int, b[2] as int, b[3] as int;
    assert x / 0x100 == b0 * 0x1_0000 + b1 * 0x100 + b2;
    assert x % 0x100 == b3;
    assert x / 0x1_0000 == b0 * 0x100 + b1;
    assert (x / 0x1_0000) % 0x100 == b1;
    assert (x / 0x100) % 0x100 == b2;
    assert x / 0x100_0000 == b0;
    var e := BigEndian32(x);
    assert e[0] == b[0] && e[1] == b[1] && e[2] == b[2] && e[3] == b[3];
  }

  /** The bytes of an ASCII string, one byte per character. */
  function Ascii(s: string): (b: seq<byte>)
    requires forall i :: 0 <= i < |s| ==> s[i] as int < 0x80
    ensures |b| == |s|
    ensures forall i :: 0 <= i < |s| ==> b[i] == s[i] as int
  {
    seq(|s|, i requires 0 <= i < |s| => s[i] as int)
  }
}
