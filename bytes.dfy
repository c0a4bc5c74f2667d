/**
 Byte-level vocabulary of the TGA codec: unsigned 8-bit values, signed 16-bit
 values, the narrowing `static_cast<short>` of an image dimension, and the
 little-endian layout of a 16-bit field inside the packed header.
 */
module Bytes {

  /** An `uchar`. */
  type byte = x: int | 0 <= x < 256

  /** A `short`: a signed 16-bit value. */
  type short = x: int | -32768 <= x < 32768

  /** Narrowing to `uchar`: keep the low 8 bits. */
  function ToUchar(x: int): (r: byte)
    ensures 0 <= x < 256 ==> r == x
  {
    x % 256
  }

  /**
   Narrowing to `short` (`static_cast<short>` of an unsigned dimension): keep the
   low 16 bits and read them as two's complement. This is the modular conversion
   every mainstream compiler performs.
   */
  function ToShort(x: int): (r: short)
    ensures -32768 <= x < 32768 ==> r == x
    ensures (r as int) % 65536 == x % 65536
  {
    var bits := x % 65536;
    if bits < 32768 then bits else bits - 65536
  }

  /** The two bytes of a `short` in memory on a little-endian host, low byte first. */
  function PackShort(s: short): (r: seq<byte>)
    ensures |r| == 2
    ensures r[0] as int + 256 * (r[1] as int) == (s as int) % 65536
  {
    var bits := (s as int) % 65536;
    [bits % 256, bits / 256]
  }

  /** The unsigned 16-bit value stored little-endian in `lo`, `hi`. */
  function U16(lo: byte, hi: byte): (r: nat)
    ensures r < 65536
  {
    lo as int + 256 * (hi as int)
  }

  /** The signed 16-bit value stored little-endian in `lo`, `hi`. */
  function UnpackShort(lo: byte, hi: byte): (r: short)
    ensures (r as int) % 65536 == U16(lo, hi)
  {
    var u := U16(lo, hi);
    if u < 32768 then u else u - 65536
  }

  /** Reading a packed `short` back gives the same value. */
  lemma ShortRoundTrip(s: short)
    ensures UnpackShort(PackShort(s)[0], PackShort(s)[1]) == s
  {
    var p := PackShort(s);
    assert U16(p[0], p[1]) == (s as int) % 65536;
  }

  /**
   The bytes written for `static_cast<short>(x)` hold the low 16 bits of `x`
   when read as an unsigned 16-bit field, which is how the TGA format reads its
   width and height: every dimension below 65536 is stored exactly, even though
   the `short` it passed through is negative from 32768 on.
   */
  lemma NarrowedFieldBytes(x: nat)
    ensures U16(PackShort(ToShort(x))[0], PackShort(ToShort(x))[1]) == x % 65536
    ensures x < 65536 ==> U16(PackShort(ToShort(x))[0], PackShort(ToShort(x))[1]) == x
  {
    var s := ToShort(x);
    assert (s as int) % 65536 == x % 65536;
    assert U16(PackShort(s)[0], PackShort(s)[1]) == (s as int) % 65536;
  }
}
