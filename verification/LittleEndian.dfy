/** Bytes and the little-endian layout of 16- and 32-bit integers. */
module LittleEndian {

  type Byte = b: int | 0 <= b < 0x100
  type U16 = n: int | 0 <= n < 0x1_0000
  type U32 = n: int | 0 <= n < 0x1_0000_0000

  function Enc16(v: U16): (r: seq<Byte>)
    ensures |r| == 2
  {
    [v % 0x100, v / 0x100]
  }

  function Enc32(v: U32): (r: seq<Byte>)
    ensures |r| == 4
  {
    var q1 := v / 0x100;
    var q2 := q1 / 0x100;
    [v % 0x100, q1 % 0x100, q2 % 0x100, q2 / 0x100]
  }

  function Dec16(b: seq<Byte>): U16
    requires |b| >= 2
  {
    var b0: int, b1: int := b[0], b[1];
    b0 + 0x100 * b1
  }

  function Dec32(b: seq<Byte>): U32
    requires |b| >= 4
  {
    var b0: int, b1: int, b2: int, b3: int := b[0], b[1], b[2], b[3];
    b0 + 0x100 * b1 + 0x1_0000 * b2 + 0x100_0000 * b3
  }

  lemma Dec16Enc16(v: U16, rest: seq<Byte>)
    ensures Dec16(Enc16(v) + rest) == v
  {
  }

  lemma Dec32Enc32(v: U32, rest: seq<Byte>)
    ensures Dec32(Enc32(v) + rest) == v
  {
    var b := Enc32(v) + rest;
    var q1 := v / 0x100;
    assert b[0] == v % 0x100 && b[1] == q1 % 0x100;
    assert b[2] == q1 / 0x100 % 0x100 && b[3] == q1 / 0x100 / 0x100;
  }

  /** The number whose digits to base 256 are `b`, the least significant one first. */
  function FromDigits(b: seq<Byte>): nat {
    if b == [] then 0 else b[0] + 0x100 * FromDigits(b[1..])
  }

  /** Both decoders read little-endian numbers from the front. */
  lemma DecIsDigits(b: seq<Byte>)
    ensures |b| >= 2 ==> Dec16(b) == FromDigits(b[..2])
    ensures |b| >= 4 ==> Dec32(b) == FromDigits(b[..4])
  {
    if |b| >= 4 {
      assert FromDigits(b[..4]) == b[0] + 0x100 * FromDigits(b[1..4]) by { assert b[..4][1..] == b[1..4]; }
      assert FromDigits(b[1..4]) == b[1] + 0x100 * FromDigits(b[2..4]) by { assert b[1..4][1..] == b[2..4]; }
      assert FromDigits(b[2..4]) == b[2] + 0x100 * FromDigits(b[3..4]) by { assert b[2..4][1..] == b[3..4]; }
      assert FromDigits(b[3..4]) == b[3] + 0x100 * FromDigits([]) by { assert b[3..4][1..] == []; }
    }
    if |b| >= 2 {
      assert FromDigits(b[..2]) == b[0] + 0x100 * FromDigits(b[1..2]) by { assert b[..2][1..] == b[1..2]; }
      assert FromDigits(b[1..2]) == b[1] + 0x100 * FromDigits([]) by { assert b[1..2][1..] == []; }
    }
  }

  /** Encoding what was decoded gives the bytes back. */
  lemma EncDec(b: seq<Byte>)
    ensures |b| >= 2 ==> Enc16(Dec16(b)) == b[..2]
    ensures |b| >= 4 ==> Enc32(Dec32(b)) == b[..4]
  {
    if |b| >= 4 {
      var v: int := Dec32(b);
      var b0: int, b1: int, b2: int, b3: int := b[0], b[1], b[2], b[3];
      assert v / 0x100 == b1 + 0x100 * b2 + 0x1_0000 * b3 && v % 0x100 == b0;
      assert v / 0x100 / 0x100 == b2 + 0x100 * b3 && v / 0x100 % 0x100 == b1;
    }
  }

  /** Skipping a prefix that has been read. */
  lemma Skip(b: seq<Byte>, at: nat, x: seq<Byte>, t: seq<Byte>)
    requires at <= |b| && b[at..] == x + t
    ensures at + |x| <= |b| && b[at + |x|..] == t
  {
    assert b[at + |x|..] == b[at..][|x|..];
  }
}
