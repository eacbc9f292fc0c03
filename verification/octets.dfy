/** The archive reader's view of bytes: plain values 0..255, with the
    unsigned little-endian fields that ZIP records are made of. */
module Octets {
  import opened Bytes

  type Octet = x: int | 0 <= x < 256

  /** Unsigned little-endian 16-bit field at offset i. */
  function U16At(s: seq<Octet>, i: nat): (v: nat)
    requires i + 2 <= |s|
    ensures v < TwoTo16
  {
    s[i] as int + 256 * s[i + 1] as int
  }

  /** Unsigned little-endian 32-bit field at offset i. */
  function U32At(s: seq<Octet>, i: nat): (v: nat)
    requires i + 4 <= |s|
    ensures v < TwoTo32
  {
    U16At(s, i) + TwoTo16 * U16At(s, i + 2)
  }

  /** Little-endian encodings, the inverses of the readers above. */
  function LE16(v: nat): (s: seq<Octet>)
    requires v < TwoTo16
    ensures |s| == 2
  {
    [v % 256, v / 256]
  }

  function LE32(v: nat): (s: seq<Octet>)
    requires v < TwoTo32
    ensures |s| == 4
  {
    LE16(v % TwoTo16) + LE16(v / TwoTo16)
  }

  lemma U16RoundTrip(v: nat, s: seq<Octet>, i: nat)
    requires v < TwoTo16
    requires i + 2 <= |s| && s[i..i + 2] == LE16(v)
    ensures U16At(s, i) == v
  {
    assert s[i] == LE16(v)[0] && s[i + 1] == LE16(v)[1];
  }

  lemma U32RoundTrip(v: nat, s: seq<Octet>, i: nat)
    requires v < TwoTo32
    requires i + 4 <= |s| && s[i..i + 4] == LE32(v)
    ensures U32At(s, i) == v
  {
    var lo, hi := LE16(v % TwoTo16), LE16(v / TwoTo16);
    assert s[i..i + 2] == s[i..i + 4][..2] == (lo + hi)[..2] == lo;
    assert s[i + 2..i + 4] == s[i..i + 4][2..] == (lo + hi)[2..] == hi;
    U16RoundTrip(v % TwoTo16, s, i);
    U16RoundTrip(v / TwoTo16, s, i + 2);
  }

  /** Reading back any two bytes and re-encoding them gives the same bytes. */
  lemma LE16OfU16(s: seq<Octet>, i: nat)
    requires i + 2 <= |s|
    ensures LE16(U16At(s, i)) == s[i..i + 2]
  {
  }
}
