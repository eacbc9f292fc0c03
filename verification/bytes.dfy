/** Byte-level helpers: the byte type of the Wiimote protocol, and
    C-style fixed-width integer conversions. */
module Bytes {

  type Byte = bv8

  const TwoTo16: int := 0x1_0000
  const TwoTo31: int := 0x8000_0000
  const TwoTo32: int := 0x1_0000_0000
  const TwoTo64: int := 0x1_0000_0000_0000_0000

  /** The `size_t` subtraction of a 64-bit target: wraps modulo 2^64. */
  function SizeSub(a: nat, b: nat): (r: nat)
    requires a < TwoTo64 && b < TwoTo64
    ensures r < TwoTo64
    ensures b <= a ==> r == a - b
    ensures a < b ==> r == a - b + TwoTo64
  {
    (a - b) % TwoTo64
  }

  /** Conversion of an unsigned value to a 32-bit `int`: keeps the low 32
      bits and reads them as two's complement. */
  function ToInt32(x: nat): (r: int)
    ensures -TwoTo31 <= r < TwoTo31
    ensures (r - x) % TwoTo32 == 0
    ensures x < TwoTo31 ==> r == x
  {
    var low := x % TwoTo32;
    if low >= TwoTo31 then low - TwoTo32 else low
  }

  /** The byte `x & 0xff` of an integer, for any sign (arithmetic shifts and
      masks agree with Euclidean division by a power of two). */
  function LowByte(x: int): (b: Byte)
    ensures b as int == x % 256
  {
    var y := x % 256;
    ByteOfSmallInt(y);
    SmallByte(y)
  }

  /** The byte of a value below 16, by cases. */
  function Nibble(y: int): Byte
    requires 0 <= y < 16
  {
    if y < 8 then
      if y < 4 then (if y < 2 then (if y == 0 then 0 else 1) else (if y == 2 then 2 else 3))
      else (if y < 6 then (if y == 4 then 4 else 5) else (if y == 6 then 6 else 7))
    else
      if y < 12 then (if y < 10 then (if y == 8 then 8 else 9) else (if y == 10 then 10 else 11))
      else (if y < 14 then (if y == 12 then 12 else 13) else (if y == 14 then 14 else 15))
  }

  /** The byte of a value below 256, assembled from its two nibbles. */
  function SmallByte(y: int): Byte
    requires 0 <= y < 256
  {
    (Nibble(y / 16) << 4) | Nibble(y % 16)
  }

  lemma NibbleValue(y: int)
    requires 0 <= y < 16
    ensures Nibble(y) as int == y
  {
  }

  lemma ByteOfSmallInt(y: int)
    requires 0 <= y < 256
    ensures SmallByte(y) as int == y
  {
    NibbleValue(y / 16);
    NibbleValue(y % 16);
  }

  lemma ByteInjective(b: Byte, c: Byte)
    requires b as int == c as int
    ensures b == c
  {
  }

  /** The low byte of an integer only depends on its residue modulo 256. */
  lemma LowByteOfResidue(x: int, b: Byte)
    requires x % 256 == b as int
    ensures LowByte(x) == b
  {
    ByteInjective(LowByte(x), b);
  }

  lemma LowByteOfByte(b: Byte)
    ensures LowByte(b as int) == b
  {
    LowByteOfResidue(b as int, b);
  }
}
